/** The table of per-crate locks: weak entries that may die, be replaced and be removed. */
module AccessLocks {
  type LockId = nat

  /** The lock `rwlock_for_key` hands out: the entry's lock if somebody still holds it, else the new one. */
  function LockFor(table: map<string, LockId>, alive: set<LockId>, key: string, newLock: LockId): LockId {
    if key in table && table[key] in alive then table[key] else newLock
  }

  function TableAfterLookup(table: map<string, LockId>, alive: set<LockId>, key: string, newLock: LockId):
    map<string, LockId>
  {
    table[key := LockFor(table, alive, key, newLock)]
  }

  /** `on_unlocked` removes the entry of a lock nobody holds any more. */
  function TableAfterUnlock(table: map<string, LockId>, alive: set<LockId>, key: string): map<string, LockId> {
    if key in table && table[key] !in alive then table - {key} else table
  }

  /** The table with the strong counts of the locks it may point to; a lock carries the object it guards. */
  class AccessLocks<T> {
    var locks: map<string, LockId>
    var strong: map<LockId, nat>
    var objects: map<LockId, T>
    var nextLock: LockId

    ghost predicate Valid()
      reads this
    {
      (forall l: LockId :: l in strong <==> l < nextLock) && strong.Keys == objects.Keys &&
      (forall key | key in locks :: locks[key] < nextLock) &&
      (forall j, k | j in locks && k in locks && j != k :: locks[j] != locks[k])
    }

    /** The locks whose strong count is not zero. */
    function Alive(): set<LockId>
      reads this
    {
      set l | l in strong && strong[l] > 0
    }

    constructor ()
      ensures Valid() && locks == map[] && Alive() == {} && nextLock == 0
    {
      locks, strong, objects, nextLock := map[], map[], map[], 0;
    }

    method NewLock(guarded: T) returns (lock: LockId)
      requires Valid()
      modifies this`strong, this`objects, this`nextLock
      ensures Valid() && lock == old(nextLock) && nextLock == lock + 1
      ensures strong == old(strong)[lock := 1] && objects == old(objects)[lock := guarded]
    {
      lock := nextLock;
      strong, objects, nextLock := strong[lock := 1], objects[lock := guarded], lock + 1;
    }

    method RwLockForKey(key: string, guarded: T) returns (lock: LockId)
      requires Valid()
      modifies this
      ensures Valid()
      ensures lock == LockFor(old(locks), old(Alive()), key, old(nextLock))
      ensures locks == TableAfterLookup(old(locks), old(Alive()), key, old(nextLock))
      ensures if key in old(locks) && old(strong)[old(locks)[key]] > 0 then
                lock == old(locks)[key] && locks == old(locks)
              else lock == old(nextLock) && locks == old(locks)[key := lock]
      ensures Alive() == old(Alive()) + {lock}
      ensures strong == old(strong)[lock := (if lock in old(strong) then old(strong)[lock] else 0) + 1]
      ensures objects == if lock == old(nextLock) then old(objects)[lock := guarded] else old(objects)
    {
      if key in locks {
        if strong[locks[key]] > 0 {
          lock := locks[key];
          strong := strong[lock := strong[lock] + 1];
        } else {
          lock := NewLock(guarded);
          locks := locks[key := lock];
        }
      } else {
        lock := NewLock(guarded);
        locks := locks[key := lock];
      }
    }

    /** Dropping one `Arc`; the table is not looked at. */
    method DropArc(lock: LockId)
      requires Valid() && lock in Alive()
      modifies this`strong
      ensures Valid() && strong == old(strong)[lock := old(strong)[lock] - 1]
      ensures Alive() == if old(strong)[lock] == 1 then old(Alive()) - {lock} else old(Alive())
    {
      strong := strong[lock := strong[lock] - 1];
    }

    method OnUnlocked(key: string)
      requires Valid()
      modifies this`locks
      ensures Valid() && locks == TableAfterUnlock(old(locks), Alive(), key)
      ensures locks == if key in old(locks) && strong[old(locks)[key]] == 0 then old(locks) - {key} else old(locks)
    {
      if key in locks && strong[locks[key]] == 0 {
        locks := locks - {key};
      }
    }
  }
}
