/**
 * The commit-confirmed registry: dangerous operations that undo themselves unless confirmed.
 * Each function is what one locked region does to the registry; the class runs them in place.
 */
module Danger {
  import opened Wrappers

  const NANOS: nat := 1_000_000_000
  const KEEP_SECS: nat := 300

  datatype Status = Pending | Confirmed | RollingBack | RolledBack | RollbackFailed

  /** The rollback closure of one operation. */
  datatype Undo = Undo(id: string)

  /** `appliedAt` is the monotonic instant, in nanoseconds. */
  datatype Entry = Entry(status: Status, ttlSecs: nat, appliedAt: nat, rollback: Option<Undo>, message: string)

  type Registry = map<string, Entry>

  datatype Refusal = NotFound | Has(status: Status)

  predicate Completed(status: Status) {
    status.Confirmed? || status.RolledBack? || status.RollbackFailed?
  }

  /** Whole seconds since the operation was applied. */
  function ElapsedSecs(e: Entry, now: nat): nat {
    if now < e.appliedAt then 0 else (now - e.appliedAt) / NANOS
  }

  function Scheduled(reg: Registry, id: string, ttlSecs: nat, now: nat): Registry {
    reg[id := Entry(Pending, ttlSecs, now, Some(Undo(id)), "")]
  }

  predicate IsPending(reg: Registry, id: string) {
    id in reg && reg[id].status.Pending?
  }

  function Committed(reg: Registry, id: string): Registry {
    if IsPending(reg, id) then reg[id := reg[id].(status := Confirmed, rollback := None)] else reg
  }

  /** First region of a rollback: claim the operation and take its closure. */
  function Claimed(reg: Registry, id: string): Registry {
    if IsPending(reg, id) then reg[id := reg[id].(status := RollingBack, rollback := None)] else reg
  }

  /** Second region of a rollback: record how the closure ended. */
  function Recorded(reg: Registry, id: string, outcome: Result<string, string>): Registry {
    if id !in reg then reg
    else match outcome
         case Ok(m) => reg[id := reg[id].(status := RolledBack, message := m)]
         case Err(m) => reg[id := reg[id].(status := RollbackFailed, message := m)]
  }

  predicate Expired(reg: Registry, id: string, now: nat) {
    IsPending(reg, id) && ElapsedSecs(reg[id], now) >= reg[id].ttlSecs
  }

  predicate Kept(e: Entry, now: nat) {
    e.status.Pending? || e.status.RollingBack? || ElapsedSecs(e, now) < KEEP_SECS
  }

  function Swept(reg: Registry, now: nat): Registry {
    map id | id in reg && Kept(reg[id], now) :: reg[id]
  }

  /** The ids, in the order the scan met them: exactly the expired ones, each once. */
  ghost predicate Lists(ids: seq<string>, reg: Registry, now: nat) {
    && (forall i, j :: 0 <= i < j < |ids| ==> ids[i] != ids[j])
    && (forall id :: id in ids <==> Expired(reg, id, now))
  }

  /** Whole seconds reach a count exactly when the nanoseconds do. */
  lemma {:induction false} SecondsReached(nanos: nat, secs: nat)
    ensures nanos / NANOS >= secs <==> nanos >= secs * NANOS
  {
    assert nanos == (nanos / NANOS) * NANOS + nanos % NANOS;
  }

  /** How often and when the sweep ran before makes no difference to what a sweep leaves. */
  lemma {:induction false} EarlierSweepsDoNotMatter(reg: Registry, before: nat, now: nat)
    requires before <= now
    ensures Swept(Swept(reg, before), now) == Swept(reg, now)
  {
    forall id | id in reg && Kept(reg[id], now) ensures Kept(reg[id], before) {
      var e := reg[id];
      if before >= e.appliedAt {
        SecondsReached(before - e.appliedAt, KEEP_SECS);
        SecondsReached(now - e.appliedAt, KEEP_SECS);
      }
    }
  }

  class DangerRegistry {
    var ops: Registry

    constructor ()
      ensures ops == map[]
    {
      ops := map[];
    }

    /** From `now` on the operation is pending with its closure, and expires exactly `ttlSecs` whole seconds later. */
    method Schedule(id: string, ttlSecs: nat, now: nat)
      modifies this
      ensures ops == Scheduled(old(ops), id, ttlSecs, now)
      ensures IsPending(ops, id) && ops[id].rollback == Some(Undo(id))
      ensures forall t: nat :: t >= now ==> (Expired(ops, id, t) <==> t >= now + ttlSecs * NANOS)
      ensures ops.Keys == old(ops).Keys + {id} && forall other :: other in old(ops) && other != id ==> ops[other] == old(ops)[other]
    {
      ops := ops[id := Entry(Pending, ttlSecs, now, Some(Undo(id)), "")];
      forall t: nat | t >= now ensures Expired(ops, id, t) <==> t >= now + ttlSecs * NANOS {
        SecondsReached(t - now, ttlSecs);
      }
    }

    /** Ok carries whether the operation had already been confirmed. */
    method Confirm(id: string) returns (r: Result<bool, Refusal>)
      modifies this
      ensures ops == Committed(old(ops), id)
      ensures r == if id !in old(ops) then Err(NotFound)
                   else if old(ops)[id].status.Confirmed? then Ok(true)
                   else if old(ops)[id].status.Pending? then Ok(false)
                   else Err(Has(old(ops)[id].status))
      ensures r.Ok? ==> id in ops && ops[id].status.Confirmed?
    {
      if id !in ops {
        return Err(NotFound);
      }
      var entry := ops[id];
      if entry.status.Confirmed? {
        return Ok(true);
      }
      if !entry.status.Pending? {
        return Err(Has(entry.status));
      }
      ops := ops[id := entry.(status := Confirmed, rollback := None)];
      return Ok(false);
    }

    method BeginRollback(id: string) returns (r: Result<Option<Undo>, Refusal>)
      modifies this
      ensures ops == Claimed(old(ops), id)
      ensures r == if id !in old(ops) then Err(NotFound)
                   else if IsPending(old(ops), id) then Ok(old(ops)[id].rollback)
                   else Err(Has(old(ops)[id].status))
    {
      if id !in ops {
        return Err(NotFound);
      }
      var entry := ops[id];
      if !entry.status.Pending? {
        return Err(Has(entry.status));
      }
      ops := ops[id := entry.(status := RollingBack, rollback := None)];
      return Ok(entry.rollback);
    }

    /** The entry, if still listed, is completed for good: it shows the outcome and can be neither confirmed nor claimed. */
    method FinishRollback(id: string, outcome: Result<string, string>)
      modifies this
      ensures ops == Recorded(old(ops), id, outcome)
      ensures id in ops ==> Completed(ops[id].status) && ops[id].status.RolledBack? == outcome.Ok?
      ensures id in ops ==> ops[id].message == match outcome { case Ok(m) => m case Err(m) => m }
      ensures Committed(ops, id) == ops && Claimed(ops, id) == ops
      ensures ops.Keys == old(ops).Keys && forall other :: other in ops && other != id ==> ops[other] == old(ops)[other]
    {
      if id in ops {
        match outcome {
          case Ok(m) => ops := ops[id := ops[id].(status := RolledBack, message := m)];
          case Err(m) => ops := ops[id := ops[id].(status := RollbackFailed, message := m)];
        }
      }
    }

    /** The scan of a tick, visiting the entries in some order. */
    method ExpiredIds(now: nat) returns (ids: seq<string>)
      ensures Lists(ids, ops, now)
    {
      ids := [];
      var todo := ops.Keys;
      while todo != {}
        invariant todo <= ops.Keys
        invariant forall i, j :: 0 <= i < j < |ids| ==> ids[i] != ids[j]
        invariant forall id :: id in ids <==> Expired(ops, id, now) && id !in todo
      {
        var id :| id in todo;
        if Expired(ops, id, now) {
          ids := ids + [id];
        }
        todo := todo - {id};
      }
    }

    /** Only completed operations 300 s past their application go; nothing pending or claimable is lost. */
    method Sweep(now: nat)
      modifies this
      ensures ops == Swept(old(ops), now)
      ensures forall id :: id in ops ==> id in old(ops) && ops[id] == old(ops)[id]
      ensures forall id :: id in old(ops) && id !in ops ==>
                Completed(old(ops)[id].status) && now >= old(ops)[id].appliedAt + KEEP_SECS * NANOS
      ensures forall id, t :: Expired(ops, id, t) <==> Expired(old(ops), id, t)
    {
      forall id | id in ops && ElapsedSecs(ops[id], now) >= KEEP_SECS ensures now >= ops[id].appliedAt + KEEP_SECS * NANOS {
        SecondsReached(now - ops[id].appliedAt, KEEP_SECS);
      }
      ops := map id | id in ops && Kept(ops[id], now) :: ops[id];
    }
  }
}
