/** The directories of one slot under renames that may fail: replacement, quarantine, import and removal. */
module Slot {
  import opened Options

  /** Which file operation of a procedure fails: the renames forth, the renames back, and the removals of tombstones. */
  datatype Faults = Faults(prepare: bool, moveRestore: bool, moveEntry: bool, publish: bool,
                           backEntry: bool, backRestore: bool, dropEntry: bool, dropRestore: bool)

  predicate RollbackWorks(f: Faults) { !f.backEntry && !f.backRestore }

  datatype Outcome = Done | Failed

  /** A replacement may also fail after the new entry is in place, with its tombstones still in the trash. */
  datatype Replacement = Replaced | Cluttered | Unchanged

  /** Contents are opaque here: `E` for entries, `R` for restores. The trash lists stand for tombstones and quarantine. */
  class SlotDirs<E(==), R(==)> {
    var entry: Option<E>
    var restore: Option<R>
    var staging: Option<E>
    var entryTrash: seq<E>
    var restoreTrash: seq<R>

    constructor (entry: Option<E>, restore: Option<R>)
      ensures this.entry == entry && this.restore == restore && staging == None && entryTrash == [] && restoreTrash == []
    {
      this.entry := entry;
      this.restore := restore;
      this.staging := None;
      this.entryTrash := [];
      this.restoreTrash := [];
    }

    /** The slot and everything around it are as they were. */
    twostate predicate Untouched()
      reads this
    {
      && entry == old(entry) && restore == old(restore) && staging == old(staging)
      && entryTrash == old(entryTrash) && restoreTrash == old(restoreTrash)
    }

    /** Nothing that was in the slot is gone: it is still there or lies in the trash. */
    twostate predicate NothingLost()
      reads this
    {
      && (old(entry).Some? ==> entry == old(entry) || old(entry).value in entryTrash)
      && (old(restore).Some? ==> restore == old(restore) || old(restore).value in restoreTrash)
    }

    /** `quarantineEntry` and `quarantineInvalidEntry`: the restore goes first and comes back if the entry cannot follow. */
    method QuarantineEntry(f: Faults) returns (outcome: Outcome)
      modifies this`entry, this`restore, this`entryTrash, this`restoreTrash
      ensures outcome.Failed? <==> old(entry).Some? && (f.prepare || (old(restore).Some? && f.moveRestore) || f.moveEntry)
      ensures outcome.Done? && old(entry).None? ==> Untouched()
      ensures outcome.Done? && old(entry).Some? ==>
        entry.None? && restore.None? && entryTrash == old(entryTrash) + [old(entry).value]
      ensures outcome.Failed? && (!f.backRestore || old(restore).None?) ==> Untouched()
      ensures outcome.Failed? ==> entry == old(entry)
      ensures NothingLost()
      ensures restore == old(restore) || restore.None?
    {
      if entry.None? {
        return Done;
      }
      if f.prepare {
        return Failed;
      }
      var moved := restore;
      if moved.Some? {
        if f.moveRestore {
          return Failed;
        }
        restoreTrash := restoreTrash + [moved.value];
        restore := None;
      }
      if f.moveEntry {
        if moved.Some? && restore.None? && !f.backRestore {
          restoreTrash := restoreTrash[..|restoreTrash| - 1];
          restore := moved;
        }
        return Failed;
      }
      entryTrash := entryTrash + [entry.value];
      entry := None;
      return Done;
    }

    /** The last part of `uploadCacheEntry`: old directories to the trash, then the staged entry into the slot. */
    method ReplaceEntry(f: Faults) returns (outcome: Replacement)
      requires staging.Some?
      modifies this
      ensures outcome.Unchanged? <==>
        || f.publish
        || (old(entry).Some? && (f.prepare || (old(restore).Some? && f.moveRestore) || f.moveEntry))
      ensures outcome.Cluttered? <==>
        !outcome.Unchanged? && old(entry).Some? && (f.dropEntry || (old(restore).Some? && f.dropRestore))
      ensures !outcome.Unchanged? ==>
        entry == old(staging) && staging.None? && restore == (if old(entry).Some? then None else old(restore))
      ensures outcome.Replaced? ==> entryTrash == old(entryTrash) && restoreTrash == old(restoreTrash)
      ensures outcome.Cluttered? ==>
        && entryTrash == old(entryTrash) + (if f.dropEntry then [old(entry).value] else [])
        && restoreTrash == old(restoreTrash) + (if old(restore).Some? then [old(restore).value] else [])
      ensures outcome.Unchanged? && RollbackWorks(f) ==> Untouched()
      ensures outcome.Unchanged? ==> NothingLost() && staging == old(staging)
      ensures outcome.Unchanged? ==> (entry == old(entry) || entry.None?) && (restore == old(restore) || restore.None?)
    {
      var oldEntry, oldRestore := entry, None;
      if oldEntry.Some? {
        if f.prepare {
          return Unchanged;
        }
        oldRestore := restore;
        if oldRestore.Some? {
          if f.moveRestore {
            return Unchanged;
          }
          restoreTrash := restoreTrash + [oldRestore.value];
          restore := None;
        }
        if f.moveEntry {
          if oldRestore.Some? && restore.None? && !f.backRestore {
            restoreTrash := restoreTrash[..|restoreTrash| - 1];
            restore := oldRestore;
          }
          return Unchanged;
        }
        entryTrash := entryTrash + [oldEntry.value];
        entry := None;
      }
      if f.publish {
        if oldEntry.Some? && entry.None? {
          if f.backEntry {
            return Unchanged;
          }
          entryTrash := entryTrash[..|entryTrash| - 1];
          entry := oldEntry;
        }
        if oldRestore.Some? && restore.None? && !f.backRestore {
          restoreTrash := restoreTrash[..|restoreTrash| - 1];
          restore := oldRestore;
        }
        return Unchanged;
      }
      entry := staging;
      staging := None;
      if oldEntry.Some? {
        if f.dropEntry {
          return Cluttered;
        }
        entryTrash := entryTrash[..|entryTrash| - 1];
      }
      if oldRestore.Some? {
        if f.dropRestore {
          return Cluttered;
        }
        restoreTrash := restoreTrash[..|restoreTrash| - 1];
      }
      return Replaced;
    }

    /** The replacement branch of `importWirePackage`, with its nested undo. A failed deadline counts as a failed
        operation: `late` is the one tested right before the entry moves. */
    method ReplaceByImport(f: Faults, late: bool) returns (outcome: Outcome)
      requires staging.Some? && entry.Some?
      modifies this
      ensures outcome.Failed? <==>
        f.prepare || (old(restore).Some? && f.moveRestore) || late || f.moveEntry || f.publish
      ensures outcome.Done? ==> entry == old(staging) && staging.None? && restore.None?
      ensures outcome.Failed? && RollbackWorks(f) ==> Untouched()
      ensures outcome.Failed? ==> NothingLost() && staging == old(staging)
      ensures outcome.Failed? ==> (entry == old(entry) || entry.None?) && (restore == old(restore) || restore.None?)
    {
      if f.prepare {
        return Failed;
      }
      var moved := None;
      if restore.Some? {
        if f.moveRestore {
          return Failed;
        }
        moved := restore;
        restoreTrash := restoreTrash + [restore.value];
        restore := None;
      }
      if late || f.moveEntry {
        UndoRestore(moved, f);
        return Failed;
      }
      var tombstone := entry;
      entryTrash := entryTrash + [entry.value];
      entry := None;
      if f.publish {
        if entry.None? && !f.backEntry {
          entryTrash := entryTrash[..|entryTrash| - 1];
          entry := tombstone;
        }
        UndoRestore(moved, f);
        return Failed;
      }
      entry := staging;
      staging := None;
      return Done;
    }

    /** Puts a moved restore back; where the rename back fails, the restore stays in the trash. */
    method UndoRestore(moved: Option<R>, f: Faults)
      requires moved.Some? ==> |restoreTrash| > 0 && restoreTrash[|restoreTrash| - 1] == moved.value && restore.None?
      modifies this`restore, this`restoreTrash
      ensures moved.Some? && !f.backRestore ==>
        restore == moved && restoreTrash == old(restoreTrash)[..|old(restoreTrash)| - 1]
      ensures moved.None? || f.backRestore ==> restore == old(restore) && restoreTrash == old(restoreTrash)
    {
      if moved.Some? && restore.None? && !f.backRestore {
        restore := moved;
        restoreTrash := restoreTrash[..|restoreTrash| - 1];
      }
    }

    /** Publication into a slot that holds no entry: one rename. */
    method PublishNew(f: Faults) returns (outcome: Outcome)
      requires staging.Some? && entry.None?
      modifies this
      ensures outcome.Failed? <==> f.publish
      ensures outcome.Done? ==> entry == old(staging) && staging.None? && restore == old(restore)
      ensures outcome.Failed? ==> Untouched()
    {
      if f.publish {
        return Failed;
      }
      entry := staging;
      staging := None;
      return Done;
    }

    /** The locked removal of an entry by `pruneCache`, up to the access record. */
    method RemoveEntry(f: Faults) returns (outcome: Outcome)
      requires entry.Some?
      modifies this`entry, this`restore, this`entryTrash, this`restoreTrash
      ensures outcome.Failed? <==> f.moveEntry || (old(restore).Some? && f.moveRestore)
      ensures outcome.Done? ==>
        && entry.None? && restore.None? && entryTrash == old(entryTrash) + [old(entry).value]
        && restoreTrash == old(restoreTrash) + (if old(restore).Some? then [old(restore).value] else [])
      ensures outcome.Failed? && !f.backEntry ==> Untouched()
      ensures outcome.Failed? ==> NothingLost() && restore == old(restore) && (entry == old(entry) || entry.None?)
    {
      if f.moveEntry {
        return Failed;
      }
      var tombstone := entry;
      entryTrash := entryTrash + [tombstone.value];
      entry := None;
      if restore.Some? {
        if f.moveRestore {
          if entry.None? && !f.backEntry {
            entryTrash := entryTrash[..|entryTrash| - 1];
            entry := tombstone;
          }
          return Failed;
        }
        restoreTrash := restoreTrash + [restore.value];
        restore := None;
      }
      return Done;
    }

    /** The removal of an auxiliary restore by `pruneCache`, and `discardInvalidRestore`. */
    method RemoveRestore(fails: bool) returns (outcome: Outcome)
      modifies this`restore, this`restoreTrash
      ensures outcome.Failed? <==> old(restore).Some? && fails
      ensures restore == if outcome.Done? then None else old(restore)
      ensures restoreTrash == old(restoreTrash) + (if outcome.Done? && old(restore).Some? then [old(restore).value] else [])
    {
      if restore.Some? {
        if fails {
          return Failed;
        }
        restoreTrash := restoreTrash + [restore.value];
        restore := None;
      }
      return Done;
    }

    /** The removal of an invalid entry as auxiliary data: its restore is left where it is. */
    method RemoveInvalidEntry(fails: bool) returns (outcome: Outcome)
      modifies this`entry, this`entryTrash
      ensures outcome.Failed? <==> old(entry).Some? && fails
      ensures entry == if outcome.Done? then None else old(entry)
      ensures entryTrash == old(entryTrash) + (if outcome.Done? && old(entry).Some? then [old(entry).value] else [])
    {
      if entry.Some? {
        if fails {
          return Failed;
        }
        entryTrash := entryTrash + [entry.value];
        entry := None;
      }
      return Done;
    }

    method Stage(e: E)
      modifies this`staging
      ensures staging == Some(e)
    {
      staging := Some(e);
    }

    method DropStaging()
      modifies this`staging
      ensures staging.None?
    {
      staging := None;
    }

    method PutRestore(r: R)
      modifies this`restore
      ensures restore == Some(r)
    {
      restore := Some(r);
    }
  }
}
