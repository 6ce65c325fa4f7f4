/** The lock table and the executor of the locking mode, updated in place. */
module LockBased {
  import opened Data
  import opened Slot
  import opened Store
  import S = Store
  import opened Locking
  import LS = LockingSafety
  import Server = Table

  class LockManager {
    var mutexTable: map<Key, RwLock>

    constructor ()
      ensures mutexTable == map[]
    {
      mutexTable := map[];
    }

    /** Returns once no writer holds the key; that moment is the precondition. */
    method ReadLock(key: Key, p: nat)
      requires CanRead(LockOf(mutexTable, key))
      modifies this
      ensures mutexTable == old(mutexTable)[key := AfterRead(LockOf(old(mutexTable), key), p)]
    {
      if key !in mutexTable {
        mutexTable := mutexTable[key := Free];
      }
      mutexTable := mutexTable[key := AfterRead(mutexTable[key], p)];
    }

    /** Returns once nobody holds the key. */
    method WriteLock(key: Key, p: nat)
      requires CanWrite(LockOf(mutexTable, key))
      modifies this
      ensures mutexTable == old(mutexTable)[key := WrittenBy(p)]
    {
      mutexTable := mutexTable[key := WrittenBy(p)];
    }

    /** Unlocks one key after the other; every key must have been locked before. */
    method UnlockAll(keys: set<Key>, p: nat)
      requires forall k :: k in keys ==> k in mutexTable && HeldBy(mutexTable[k], p)
      modifies this
      ensures mutexTable.Keys == old(mutexTable).Keys
      ensures forall k :: k in mutexTable ==>
                mutexTable[k] == if k in keys then AfterUnlock(old(mutexTable)[k], p) else old(mutexTable)[k]
    {
      var todo := keys;
      while todo != {}
        invariant todo <= keys && mutexTable.Keys == old(mutexTable).Keys
        invariant forall k :: k in mutexTable ==>
                    mutexTable[k] == if k in keys - todo then AfterUnlock(old(mutexTable)[k], p) else old(mutexTable)[k]
        decreases |todo|
      {
        var key :| key in todo;
        todo := todo - {key};
        mutexTable := mutexTable[key := AfterUnlock(mutexTable[key], p)];
      }
    }
  }

  ghost predicate Noted(locks: map<Key, RwLock>, keys: set<Key>, id: nat) {
    forall k :: k in keys ==>
      k in locks && HeldBy(locks[k], id) && (locks[k].ReadBy? ==> locks[k].readers != {})
  }

  lemma WriteNoted(locks: map<Key, RwLock>, keys: set<Key>, id: nat, key: Key)
    requires Noted(locks, keys, id)
    ensures Noted(locks[key := WrittenBy(id)], keys + {key}, id)
  {
  }

  class LockBasedExecutor {
    const id: nat
    const table: Server.Table
    const lockManager: LockManager
    var accessKeys: set<Key>

    constructor (id: nat, table: Server.Table, lockManager: LockManager)
      ensures this.id == id && this.table == table && this.lockManager == lockManager && accessKeys == {}
    {
      this.id := id;
      this.table := table;
      this.lockManager := lockManager;
      accessKeys := {};
    }

    /** The executor really holds the locks it has noted, each as readers' or writer's lock. */
    ghost predicate Valid()
      reads this, lockManager
    {
      Noted(lockManager.mutexTable, accessKeys, id)
    }

    method Put(item: Item)
      requires Valid() && table.Valid() && CanWrite(LockOf(lockManager.mutexTable, item.key))
      requires table.HasRoom(item.key) && Packs(table.committedItems.codec, item)
      modifies this, lockManager, table, table.committedItems, table.committedItems.mem, table.committedItems.carved
      ensures Valid() && table.Valid() && accessKeys == old(accessKeys) + {item.key}
      ensures lockManager.mutexTable == old(lockManager.mutexTable)[item.key := WrittenBy(id)]
      ensures table.Contents() == S.Put(old(table.Contents()), item)
    {
      WriteNoted(lockManager.mutexTable, accessKeys, id, item.key);
      ghost var start := table.Contents();
      lockManager.WriteLock(item.key, id);
      assert table.Contents() == start;
      label locked:
      StoreLocked(item);
      assert lockManager.mutexTable == old@locked(lockManager.mutexTable);
    }

    /** The part of `put` that runs under the writer's lock. */
    method StoreLocked(item: Item)
      requires table.Valid() && table.HasRoom(item.key) && Packs(table.committedItems.codec, item)
      modifies `accessKeys, table, table.committedItems, table.committedItems.mem, table.committedItems.carved
      ensures table.Valid() && accessKeys == old(accessKeys) + {item.key}
      ensures table.Contents() == S.Put(old(table.Contents()), item)
    {
      table.Put(item);
      ghost var after := table.Contents();
      accessKeys := accessKeys + {item.key};
      assert table.Valid() && table.Contents() == after;
    }

    method Get(key: Key) returns (item: Item)
      requires Valid() && table.Valid() && CanRead(LockOf(lockManager.mutexTable, key))
      modifies this, lockManager, table`latestCommit
      ensures Valid() && table.Valid() && accessKeys == old(accessKeys) + {key}
      ensures lockManager.mutexTable == old(lockManager.mutexTable)[key := AfterRead(LockOf(old(lockManager.mutexTable), key), id)]
      ensures table.Contents() == Touch(old(table.Contents()), key)
      ensures item == GetLatest(old(table.Contents()), key)
    {
      lockManager.ReadLock(key, id);
      item := table.GetLatestItem(key);
      accessKeys := accessKeys + {key};
    }

    /** Afterwards this executor holds none of its keys, and nobody else has lost one. */
    method ReleaseLocks()
      requires Valid()
      modifies this, lockManager
      ensures Valid() && accessKeys == {}
      ensures forall k :: k in old(accessKeys) ==> !HeldBy(LockOf(lockManager.mutexTable, k), id)
      ensures forall k, q: nat :: q != id || k !in old(accessKeys) ==>
                (HeldBy(LockOf(lockManager.mutexTable, k), q) <==> HeldBy(LockOf(old(lockManager.mutexTable), k), q))
    {
      ghost var before := lockManager.mutexTable;
      lockManager.UnlockAll(accessKeys, id);
      forall k | k in accessKeys
        ensures forall q: nat :: HeldBy(lockManager.mutexTable[k], q) <==> HeldBy(before[k], q) && q != id
      {
        LS.UnlockGivesBack(before[k], id);
      }
      accessKeys := {};
    }
  }
}
