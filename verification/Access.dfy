/** Access records: the lease a hit leaves behind. */
module Access {
  import opened Options

  const DEFAULT_ACCESS_LEASE_MS := 15 * 60 * 1000

  /** The stored file: absent, a regular file that does not parse, something else in its place, or a record. */
  datatype Access = Missing | Malformed | Irregular | Record(lastAccessedAt: int, protectedUntil: int)

  predicate Parses(a: Access) { a.Record? && a.lastAccessedAt <= a.protectedUntil }

  function Later(a: int, b: int): int { if a < b then b else a }

  /** The record a touch writes over what it could read. */
  function Touched(a: Access, nowMs: int, leaseMs: nat): Access
  {
    var last := if Parses(a) then Later(nowMs, a.lastAccessedAt) else nowMs;
    Record(last, if Parses(a) then Later(last + leaseMs, a.protectedUntil) else last + leaseMs)
  }

  /** A touch leaves a full lease from now, never shortens one that could be read, and leaves nothing longer than either. */
  lemma TouchExtends(a: Access, nowMs: int, leaseMs: nat)
    ensures var r := Touched(a, nowMs, leaseMs);
            && Parses(r) && r.lastAccessedAt >= nowMs && r.protectedUntil >= nowMs + leaseMs
            && (Parses(a) ==> r.lastAccessedAt >= a.lastAccessedAt && r.protectedUntil >= a.protectedUntil)
            && (r.lastAccessedAt == nowMs || (Parses(a) && r.lastAccessedAt == a.lastAccessedAt))
            && (r.protectedUntil == r.lastAccessedAt + leaseMs || (Parses(a) && r.protectedUntil == a.protectedUntil))
  {
  }

  class AccessFile {
    var stored: Access

    constructor (stored: Access)
      ensures this.stored == stored
    {
      this.stored := stored;
    }

    /** `readAccessRecord`: fails on anything that is there but is no record; `Some(Missing)` when nothing is there. */
    method Read() returns (r: Option<Access>)
      ensures r == if stored.Missing? || Parses(stored) then Some(stored) else None
    {
      if stored.Missing? {
        return Some(Missing);
      }
      if !stored.Record? || stored.lastAccessedAt > stored.protectedUntil {
        return None;
      }
      return Some(stored);
    }

    /** The first half of `touchAccessRecord`: the record to write, made from what is there now. */
    method Renewed(nowMs: int, leaseMs: nat) returns (r: Option<Access>)
      ensures r == if stored.Irregular? then None else Some(Touched(stored, nowMs, leaseMs))
    {
      if stored.Irregular? {
        return None;
      }
      var existing := Read();
      var lastAccessedAt, protectedUntil := nowMs, nowMs + leaseMs;
      if existing.Some? && existing.value.Record? {
        lastAccessedAt := Later(nowMs, existing.value.lastAccessedAt);
        protectedUntil := Later(lastAccessedAt + leaseMs, existing.value.protectedUntil);
      }
      return Some(Record(lastAccessedAt, protectedUntil));
    }

    /** The second half: the rename that puts a record in place, whatever is there by then. */
    method Replace(record: Option<Access>, writable: bool) returns (ok: bool)
      modifies this
      ensures ok == (writable && record.Some?)
      ensures stored == if ok then record.value else old(stored)
    {
      if record.None? || !writable {
        return false;
      }
      stored := record.value;
      return true;
    }

    /** `touchAccessRecord`, with nothing in between; `writable` is whether the new record can be put in place. */
    method Touch(nowMs: int, leaseMs: nat, writable: bool) returns (ok: bool)
      modifies this
      ensures ok == (writable && !old(stored).Irregular?)
      ensures stored == if ok then Touched(old(stored), nowMs, leaseMs) else old(stored)
    {
      var record := Renewed(nowMs, leaseMs);
      ok := Replace(record, writable);
    }

    /** `removeAccessRecord` */
    method Remove(removable: bool) returns (ok: bool)
      modifies this
      ensures ok == (old(stored).Missing? || (removable && !old(stored).Irregular?))
      ensures stored == if ok then Missing else old(stored)
    {
      if stored.Missing? {
        return true;
      }
      if stored.Irregular? || !removable {
        return false;
      }
      stored := Missing;
      return true;
    }
  }
}
