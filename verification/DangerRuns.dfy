/**
 * Every interleaving of any number of threads scheduling, confirming, rolling back and ticking over one
 * registry. A locked region is one step; between its regions a thread is at a program counter, and the
 * closure runs with the lock released. A step that cannot happen changes nothing.
 */
module DangerRuns {
  import opened Wrappers
  import opened Danger

  /** Who asked for a rollback: an operator, or a tick with ids still to visit out of those it scanned. */
  datatype Caller = Operator | Tick(todo: seq<string>, scanned: set<string>)

  /** Where a busy thread is; an idle thread has no entry. */
  datatype Pc =
    | Running(id: string, undo: Option<Undo>, caller: Caller)
    | Finishing(id: string, outcome: Result<string, string>, caller: Caller)
    | Ticking(todo: seq<string>, scanned: set<string>)

  /** `ids`, `runs`, `outcomes` and `confirmed` record history: ids ever used, closure runs, how they ended. */
  datatype State = State(
    reg: Registry,
    clock: nat,
    threads: map<nat, Pc>,
    ids: set<string>,
    runs: multiset<string>,
    outcomes: map<string, Result<string, string>>,
    confirmed: set<string>)

  datatype Action =
    | Pass(to: nat)
    | Schedule(id: string, ttlSecs: nat)
    | Confirm(id: string)
    | Rollback(t: nat, id: string)
    | RunClosure(t: nat, outcome: Result<string, string>)
    | Finish(t: nat)
    | Scan(t: nat, found: seq<string>)
    | Visit(t: nat)
    | Sweep(t: nat)

  const START := State(map[], 0, map[], {}, multiset{}, map[], {})

  const MISSING := "rollback closure missing"

  function After(caller: Caller, threads: map<nat, Pc>, t: nat): map<nat, Pc> {
    match caller
    case Operator => threads - {t}
    case Tick(todo, scanned) => threads[t := Ticking(todo, scanned)]
  }

  /** The first region of `rollback_now`, called from `caller`. */
  function Begin(s: State, t: nat, id: string, caller: Caller): State {
    if IsPending(s.reg, id)
    then s.(reg := Claimed(s.reg, id), threads := s.threads[t := Running(id, s.reg[id].rollback, caller)])
    else s.(threads := After(caller, s.threads, t))
  }

  /** The closure runs, with the lock released. */
  function Ran(s: State, t: nat, outcome: Result<string, string>): State
    requires t in s.threads && s.threads[t].Running? && s.threads[t].undo.Some?
  {
    var pc := s.threads[t];
    s.(threads := s.threads[t := Finishing(pc.id, outcome, pc.caller)],
       runs := s.runs + multiset{pc.undo.value.id},
       outcomes := s.outcomes[pc.undo.value.id := outcome])
  }

  /** The second region of `rollback_now`. */
  function Ended(s: State, t: nat): State
    requires t in s.threads && s.threads[t].Finishing?
  {
    var pc := s.threads[t];
    s.(reg := Recorded(s.reg, pc.id, pc.outcome), threads := After(pc.caller, s.threads, t))
  }

  ghost function Step(s: State, action: Action): State {
    match action
    case Pass(to) => if s.clock <= to then s.(clock := to) else s
    case Schedule(id, ttlSecs) =>
      if id in s.ids then s
      else s.(reg := Scheduled(s.reg, id, ttlSecs, s.clock), ids := s.ids + {id})
    case Confirm(id) =>
      if IsPending(s.reg, id) then s.(reg := Committed(s.reg, id), confirmed := s.confirmed + {id}) else s
    case Rollback(t, id) =>
      if t in s.threads then s else Begin(s, t, id, Operator)
    case RunClosure(t, outcome) =>
      if t !in s.threads || !s.threads[t].Running? then s
      else if s.threads[t].undo.None?
      then s.(threads := s.threads[t := Finishing(s.threads[t].id, Err(MISSING), s.threads[t].caller)])
      else Ran(s, t, outcome)
    case Finish(t) =>
      if t !in s.threads || !s.threads[t].Finishing? then s else Ended(s, t)
    case Scan(t, found) =>
      if t in s.threads || !Lists(found, s.reg, s.clock) then s
      else s.(threads := s.threads[t := Ticking(found, set id | id in found)])
    case Visit(t) =>
      if t !in s.threads || !s.threads[t].Ticking? || s.threads[t].todo == [] then s else
        var pc := s.threads[t];
        Begin(s, t, pc.todo[0], Tick(pc.todo[1..], pc.scanned))
    case Sweep(t) =>
      if !AtSweep(s, t) then s
      else s.(reg := Swept(s.reg, s.clock), threads := s.threads - {t})
  }

  /** The thread has visited everything its scan found. */
  predicate AtSweep(s: State, t: nat) {
    t in s.threads && s.threads[t].Ticking? && s.threads[t].todo == []
  }

  ghost function Exec(run: seq<Action>): State {
    if run == [] then START else Step(Exec(run[..|run| - 1]), run[|run| - 1])
  }

  // ---------------------------------------------------------------- what every step keeps

  predicate Holds(pc: Pc, id: string) {
    !pc.Ticking? && pc.id == id
  }

  function EndOf(outcome: Result<string, string>): Status {
    if outcome.Ok? then RolledBack else RollbackFailed
  }

  function MessageOf(outcome: Result<string, string>): string {
    match outcome case Ok(m) => m case Err(m) => m
  }

  ghost predicate EntryInv(s: State, id: string)
    requires id in s.reg
  {
    var e := s.reg[id];
    && id in s.ids
    && e.appliedAt <= s.clock
    && (e.status.Pending? ==> e.rollback == Some(Undo(id)) && s.runs[id] == 0 && id !in s.confirmed)
    && (e.status.Confirmed? <==> id in s.confirmed)
    && (e.status.RolledBack? || e.status.RollbackFailed? ==>
          s.runs[id] == 1 && id in s.outcomes && e.status == EndOf(s.outcomes[id]) && e.message == MessageOf(s.outcomes[id]))
  }

  /** A thread inside a rollback owns an entry that is rolling back, and holds its very own closure. */
  ghost predicate OwnerInv(s: State, t: nat)
    requires t in s.threads
  {
    match s.threads[t]
    case Running(id, undo, _) =>
      id in s.reg && s.reg[id].status.RollingBack? && undo == Some(Undo(id)) && s.runs[id] == 0
    case Finishing(id, outcome, _) =>
      id in s.reg && s.reg[id].status.RollingBack? && s.runs[id] == 1 && id in s.outcomes && s.outcomes[id] == outcome
    case Ticking(_, _) => true
  }

  function TickOf(pc: Pc): Option<(seq<string>, set<string>)> {
    match pc
    case Ticking(todo, scanned) => Some((todo, scanned))
    case Running(_, _, Tick(todo, scanned)) => Some((todo, scanned))
    case Finishing(_, _, Tick(todo, scanned)) => Some((todo, scanned))
    case _ => None
  }

  /** What a tick scanned is still to be visited or no longer pending, and stays past its deadline. */
  ghost predicate TickInv(s: State, t: nat)
    requires t in s.threads
  {
    TickOf(s.threads[t]).Some? ==>
      var (todo, scanned) := TickOf(s.threads[t]).value;
      forall id :: id in scanned ==>
        && id in s.ids
        && (id in todo || !IsPending(s.reg, id))
        && (id in s.reg ==> ElapsedSecs(s.reg[id], s.clock) >= s.reg[id].ttlSecs)
  }

  ghost predicate Entries(s: State) {
    forall id :: id in s.reg ==> EntryInv(s, id)
  }

  ghost predicate Threads(s: State) {
    forall t :: t in s.threads ==> OwnerInv(s, t) && TickInv(s, t)
  }

  ghost predicate OneOwner(s: State) {
    forall t, u, id :: t in s.threads && u in s.threads && Holds(s.threads[t], id) && Holds(s.threads[u], id) ==> t == u
  }

  ghost predicate History(s: State) {
    && (forall id :: s.runs[id] <= 1)
    && (forall id :: id in s.confirmed ==> s.runs[id] == 0 && id in s.ids)
    && (forall id :: s.runs[id] > 0 ==> id in s.ids)
  }

  ghost predicate Inv(s: State) {
    Entries(s) && Threads(s) && OneOwner(s) && History(s)
  }

  /** Between the two states nothing became pending again and deadlines stayed where they were. */
  ghost predicate Settles(s: State, s': State) {
    && s.ids <= s'.ids && s.clock <= s'.clock
    && forall id :: id in s.ids && id in s'.reg ==>
        && id in s.reg
        && (s'.reg[id].status.Pending? ==> s.reg[id].status.Pending?)
        && s'.reg[id].ttlSecs == s.reg[id].ttlSecs && s'.reg[id].appliedAt == s.reg[id].appliedAt
  }

  lemma {:induction false} ElapsedGrows(e: Entry, now: nat, later: nat)
    requires now <= later
    ensures ElapsedSecs(e, now) <= ElapsedSecs(e, later)
  {
  }

  /** Whatever a tick has still to visit may shrink by an id that is no longer pending. */
  lemma {:induction false} TickInvFrame(s: State, s': State, u: nat)
    requires u in s.threads && u in s'.threads && TickInv(s, u) && Settles(s, s')
    requires match (TickOf(s.threads[u]), TickOf(s'.threads[u]))
             case (_, None) => true
             case (Some(was), Some(now)) =>
               was.1 == now.1 && forall id :: id in was.0 ==> id in now.0 || !IsPending(s'.reg, id)
             case _ => false
    ensures TickInv(s', u)
  {
    if TickOf(s'.threads[u]).Some? {
      var scanned := TickOf(s'.threads[u]).value.1;
      forall id | id in scanned && id in s'.reg
        ensures ElapsedSecs(s'.reg[id], s'.clock) >= s'.reg[id].ttlSecs
      {
        assert id in s.reg;
        ElapsedGrows(s.reg[id], s.clock, s'.clock);
      }
    }
  }

  /** A thread that did not move keeps its invariant when the entry it holds is left alone. */
  lemma {:induction false} BystanderKeepsInv(s: State, s': State, u: nat)
    requires u in s.threads && OwnerInv(s, u) && TickInv(s, u) && Settles(s, s')
    requires u in s'.threads && s'.threads[u] == s.threads[u]
    requires !s.threads[u].Ticking? ==> Spared(s, s', s.threads[u].id)
    ensures OwnerInv(s', u) && TickInv(s', u)
  {
    TickInvFrame(s, s', u);
  }

  /** The entry and the history of an operation are left alone. */
  ghost predicate Spared(s: State, s': State, id: string) {
    && id in s.reg && id in s'.reg && s'.reg[id] == s.reg[id] && s'.runs[id] == s.runs[id]
    && (id in s.outcomes ==> id in s'.outcomes && s'.outcomes[id] == s.outcomes[id])
  }

  /** One entry changes, and every other is left alone. */
  ghost predicate Touches(s: State, s': State, id: string) {
    && s'.ids == s.ids && s'.clock == s.clock && s'.confirmed == s.confirmed
    && id in s.reg && s'.reg.Keys == s.reg.Keys
    && forall i :: i in s.reg && i != id ==> Spared(s, s', i)
  }

  /** No busy thread but `t` moves. */
  predicate OnlyMoves(s: State, s': State, t: nat) {
    forall u :: u in s'.threads && u != t ==> u in s.threads && s'.threads[u] == s.threads[u]
  }

  /** No thread but `t` is inside a rollback of the operation; those inside another have it listed. */
  predicate OwnedBut(s: State, t: nat, id: string) {
    forall u :: u in s.threads && u != t && !s.threads[u].Ticking? ==> s.threads[u].id in s.reg && s.threads[u].id != id
  }

  lemma {:induction false} TouchKeepsEntries(s: State, s': State, id: string)
    requires Entries(s) && Touches(s, s', id) && EntryInv(s', id)
    ensures Entries(s')
  {
    forall i | i in s'.reg ensures EntryInv(s', i) {
      assert EntryInv(s, i);
      assert i != id ==> Spared(s, s', i);
    }
  }

  lemma {:induction false} TouchKeepsThreads(s: State, s': State, t: nat, id: string)
    requires Threads(s) && Touches(s, s', id) && Settles(s, s') && OwnedBut(s, t, id) && OnlyMoves(s, s', t)
    requires t in s'.threads ==> OwnerInv(s', t) && TickInv(s', t)
    ensures Threads(s')
  {
    forall u | u in s'.threads ensures OwnerInv(s', u) && TickInv(s', u) {
      if u != t {
        assert OwnerInv(s, u) && TickInv(s, u);
        assert !s.threads[u].Ticking? ==> Spared(s, s', s.threads[u].id);
        BystanderKeepsInv(s, s', u);
      }
    }
  }

  /** Only threads move: the entries and their history are as they were. */
  lemma {:induction false} MoveKeepsEntries(s: State, threads: map<nat, Pc>)
    requires Entries(s)
    ensures Entries(s.(threads := threads)) && Settles(s, s.(threads := threads))
  {
    var s' := s.(threads := threads);
    forall i | i in s.reg ensures EntryInv(s', i) && EntryInv(s, i) {
      assert EntryInv(s, i);
    }
  }

  lemma {:induction false} MoveKeepsThreads(s: State, s': State, t: nat)
    requires Threads(s) && Settles(s, s') && s' == s.(threads := s'.threads) && OnlyMoves(s, s', t)
    requires t in s'.threads ==> OwnerInv(s', t) && TickInv(s', t)
    ensures Threads(s')
  {
    forall u | u in s'.threads ensures OwnerInv(s', u) && TickInv(s', u) {
      if u != t {
        assert OwnerInv(s, u) && TickInv(s, u);
        BystanderKeepsInv(s, s', u);
      }
    }
  }

  lemma {:induction false} OneOwnerFrame(s: State, s': State)
    requires OneOwner(s)
    requires forall u :: u in s'.threads && !s'.threads[u].Ticking? ==>
               u in s.threads && !s.threads[u].Ticking? && s.threads[u].id == s'.threads[u].id
    ensures OneOwner(s')
  {
    forall t, u, id | t in s'.threads && u in s'.threads && Holds(s'.threads[t], id) && Holds(s'.threads[u], id)
      ensures t == u
    {
      assert Holds(s.threads[t], id) && Holds(s.threads[u], id);
    }
  }

  /** Every other thread inside a rollback owns another operation. */
  lemma {:induction false} OthersHoldOthers(s: State, t: nat)
    requires Threads(s) && OneOwner(s) && t in s.threads && !s.threads[t].Ticking?
    ensures OwnedBut(s, t, s.threads[t].id)
  {
    forall u | u in s.threads && u != t && !s.threads[u].Ticking?
      ensures s.threads[u].id in s.reg && s.threads[u].id != s.threads[t].id
    {
      assert OwnerInv(s, u) && Holds(s.threads[u], s.threads[u].id) && Holds(s.threads[t], s.threads[t].id);
    }
  }

  /** Claiming a pending operation for a thread. */
  lemma {:induction false} ClaimKeepsInv(s: State, t: nat, id: string, caller: Caller)
    requires Inv(s) && IsPending(s.reg, id)
    requires FreeFor(s, t, id, caller)
    ensures Inv(s.(reg := Claimed(s.reg, id), threads := s.threads[t := Running(id, s.reg[id].rollback, caller)]))
  {
    var s' := s.(reg := Claimed(s.reg, id), threads := s.threads[t := Running(id, s.reg[id].rollback, caller)]);
    ClaimTouches(s, s', t, id, caller);
    TouchKeepsEntries(s, s', id);
    PendingIsUnowned(s, t, id);
    TouchKeepsThreads(s, s', t, id);
    ClaimKeepsOneOwner(s, s', t, id);
  }

  lemma {:induction false} ClaimTouches(s: State, s': State, t: nat, id: string, caller: Caller)
    requires Inv(s) && IsPending(s.reg, id) && FreeFor(s, t, id, caller)
    requires s' == s.(reg := Claimed(s.reg, id), threads := s.threads[t := Running(id, s.reg[id].rollback, caller)])
    ensures Touches(s, s', id) && Settles(s, s') && EntryInv(s', id) && OwnerInv(s', t) && TickInv(s', t)
    ensures OnlyMoves(s, s', t)
  {
    assert EntryInv(s, id);
    forall i | i in s.reg && i != id ensures Spared(s, s', i) {
    }
    if t in s.threads {
      TickInvFrame(s, s', t);
    }
  }

  lemma {:induction false} PendingIsUnowned(s: State, t: nat, id: string)
    requires Threads(s) && IsPending(s.reg, id)
    ensures forall u :: u in s.threads && !s.threads[u].Ticking? ==> s.threads[u].id in s.reg && s.threads[u].id != id
    ensures OwnedBut(s, t, id)
  {
    forall u | u in s.threads && !s.threads[u].Ticking?
      ensures s.threads[u].id in s.reg && s.threads[u].id != id
    {
      assert OwnerInv(s, u);
    }
  }

  lemma {:induction false} ClaimKeepsOneOwner(s: State, s': State, t: nat, id: string)
    requires OneOwner(s)
    requires forall u :: u in s.threads && !s.threads[u].Ticking? ==> s.threads[u].id != id
    requires t in s'.threads && Holds(s'.threads[t], id) && OnlyMoves(s, s', t)
    ensures OneOwner(s')
  {
    forall v, u, i | v in s'.threads && u in s'.threads && Holds(s'.threads[v], i) && Holds(s'.threads[u], i)
      ensures v == u
    {
      if v != t && u != t {
        assert Holds(s.threads[v], i) && Holds(s.threads[u], i);
      }
    }
  }

  /** The thread is idle, or a tick about to visit this id. */
  predicate FreeFor(s: State, t: nat, id: string, caller: Caller) {
    match caller
    case Operator => t !in s.threads
    case Tick(todo, scanned) => t in s.threads && s.threads[t] == Ticking([id] + todo, scanned)
  }

  /** A rollback that is refused: an operator goes away, a tick moves on. */
  lemma {:induction false} RefusalKeepsInv(s: State, t: nat, id: string, caller: Caller)
    requires Inv(s) && !IsPending(s.reg, id)
    requires FreeFor(s, t, id, caller)
    ensures Inv(s.(threads := After(caller, s.threads, t)))
  {
    var s' := s.(threads := After(caller, s.threads, t));
    MoveKeepsEntries(s, s'.threads);
    if t in s.threads {
      TickInvFrame(s, s', t);
    }
    MoveKeepsThreads(s, s', t);
    OneOwnerFrame(s, s');
  }

  lemma {:induction false} BeginKeepsInv(s: State, t: nat, id: string, caller: Caller)
    requires Inv(s)
    requires FreeFor(s, t, id, caller)
    ensures Inv(Begin(s, t, id, caller))
  {
    if IsPending(s.reg, id) {
      ClaimKeepsInv(s, t, id, caller);
    } else {
      RefusalKeepsInv(s, t, id, caller);
    }
  }

  lemma {:induction false} RanKeepsInv(s: State, t: nat, outcome: Result<string, string>)
    requires Inv(s) && t in s.threads && s.threads[t].Running? && s.threads[t].undo.Some?
    ensures Inv(Ran(s, t, outcome))
  {
    var s' := Ran(s, t, outcome);
    RanTouches(s, t, outcome);
    TouchKeepsEntries(s, s', s.threads[t].id);
    OthersHoldOthers(s, t);
    TouchKeepsThreads(s, s', t, s.threads[t].id);
    OneOwnerFrame(s, s');
    RanKeepsHistory(s, t, outcome);
  }

  lemma {:induction false} RanTouches(s: State, t: nat, outcome: Result<string, string>)
    requires Inv(s) && t in s.threads && s.threads[t].Running? && s.threads[t].undo.Some?
    ensures var s', id := Ran(s, t, outcome), s.threads[t].id;
            && Touches(s, s', id) && Settles(s, s') && EntryInv(s', id) && OwnerInv(s', t) && TickInv(s', t)
            && OnlyMoves(s, s', t)
  {
    var s', id := Ran(s, t, outcome), s.threads[t].id;
    assert OwnerInv(s, t) && TickInv(s, t) && EntryInv(s, id);
    forall i | i in s.reg && i != id ensures Spared(s, s', i) {
    }
    TickInvFrame(s, s', t);
  }

  lemma {:induction false} RanKeepsHistory(s: State, t: nat, outcome: Result<string, string>)
    requires Inv(s) && t in s.threads && s.threads[t].Running? && s.threads[t].undo.Some?
    ensures History(Ran(s, t, outcome))
  {
    assert OwnerInv(s, t) && EntryInv(s, s.threads[t].id);
  }

  lemma {:induction false} EndedKeepsInv(s: State, t: nat)
    requires Inv(s) && t in s.threads && s.threads[t].Finishing?
    ensures Inv(Ended(s, t))
  {
    var s' := Ended(s, t);
    EndedTouches(s, t);
    TouchKeepsEntries(s, s', s.threads[t].id);
    OthersHoldOthers(s, t);
    TouchKeepsThreads(s, s', t, s.threads[t].id);
    OneOwnerFrame(s, s');
  }

  lemma {:induction false} EndedTouches(s: State, t: nat)
    requires Inv(s) && t in s.threads && s.threads[t].Finishing?
    ensures var s', id := Ended(s, t), s.threads[t].id;
            && Touches(s, s', id) && Settles(s, s') && EntryInv(s', id) && OnlyMoves(s, s', t)
            && (t in s'.threads ==> OwnerInv(s', t) && TickInv(s', t))
  {
    var s', id := Ended(s, t), s.threads[t].id;
    assert OwnerInv(s, t) && TickInv(s, t) && EntryInv(s, id);
    forall i | i in s.reg && i != id ensures Spared(s, s', i) {
    }
    if t in s'.threads {
      TickInvFrame(s, s', t);
    }
  }

  lemma {:induction false} ScannedKeepsInv(s: State, t: nat, found: seq<string>)
    requires Inv(s) && t !in s.threads && Lists(found, s.reg, s.clock)
    ensures Inv(s.(threads := s.threads[t := Ticking(found, set id | id in found)]))
  {
    var s' := s.(threads := s.threads[t := Ticking(found, set id | id in found)]);
    MoveKeepsEntries(s, s'.threads);
    forall id | id in found ensures id in s.ids && Expired(s.reg, id, s.clock) {
      assert Expired(s.reg, id, s.clock) && EntryInv(s, id);
    }
    MoveKeepsThreads(s, s', t);
    OneOwnerFrame(s, s');
  }

  lemma {:induction false} PassKeepsInv(s: State, to: nat)
    requires Inv(s) && s.clock <= to
    ensures Inv(s.(clock := to))
  {
    var s' := s.(clock := to);
    assert forall i :: i in s.reg ==> EntryInv(s, i) && EntryInv(s', i);
    QuietKeepsInv(s, s');
  }

  /** No thread moves (one may return), no history is written, and rolling-back entries stay as they are. */
  lemma {:induction false} QuietKeepsInv(s: State, s': State)
    requires Inv(s) && Settles(s, s') && Entries(s')
    requires forall u :: u in s'.threads ==> u in s.threads && s'.threads[u] == s.threads[u]
    requires forall id :: id in s.reg && s.reg[id].status.RollingBack? ==> id in s'.reg && s'.reg[id] == s.reg[id]
    requires s'.runs == s.runs && s'.outcomes == s.outcomes
    ensures Threads(s') && OneOwner(s')
  {
    forall u | u in s'.threads ensures OwnerInv(s', u) && TickInv(s', u) {
      assert OwnerInv(s, u) && TickInv(s, u);
      BystanderKeepsInv(s, s', u);
    }
    OneOwnerFrame(s, s');
  }

  lemma {:induction false} ScheduleKeepsInv(s: State, id: string, ttlSecs: nat)
    requires Inv(s) && id !in s.ids
    ensures Inv(s.(reg := Scheduled(s.reg, id, ttlSecs, s.clock), ids := s.ids + {id}))
  {
    var s' := s.(reg := Scheduled(s.reg, id, ttlSecs, s.clock), ids := s.ids + {id});
    assert forall i :: i in s.reg ==> EntryInv(s, i);
    assert EntryInv(s', id);
    QuietKeepsInv(s, s');
  }

  lemma {:induction false} ConfirmKeepsInv(s: State, id: string)
    requires Inv(s) && IsPending(s.reg, id)
    ensures Inv(s.(reg := Committed(s.reg, id), confirmed := s.confirmed + {id}))
  {
    var s' := s.(reg := Committed(s.reg, id), confirmed := s.confirmed + {id});
    assert forall i :: i in s.reg ==> EntryInv(s, i);
    assert Entries(s');
    QuietKeepsInv(s, s');
  }

  lemma {:induction false} SweepKeepsInv(s: State, t: nat)
    requires Inv(s)
    ensures Inv(s.(reg := Swept(s.reg, s.clock), threads := s.threads - {t}))
  {
    var s' := s.(reg := Swept(s.reg, s.clock), threads := s.threads - {t});
    assert forall i :: i in s'.reg ==> EntryInv(s, i) && EntryInv(s', i);
    QuietKeepsInv(s, s');
  }

  lemma {:induction false} StepKeepsInv(s: State, action: Action)
    requires Inv(s)
    ensures Inv(Step(s, action))
  {
    match action
    case Pass(to) =>
      if s.clock <= to {
        PassKeepsInv(s, to);
      }
    case Schedule(id, ttlSecs) =>
      if id !in s.ids {
        ScheduleKeepsInv(s, id, ttlSecs);
      }
    case Confirm(id) =>
      if IsPending(s.reg, id) {
        ConfirmKeepsInv(s, id);
      }
    case Rollback(t, id) =>
      if t !in s.threads {
        BeginKeepsInv(s, t, id, Operator);
      }
    case RunClosure(t, outcome) =>
      if t in s.threads && s.threads[t].Running? {
        assert OwnerInv(s, t);
        RanKeepsInv(s, t, outcome);
      }
    case Finish(t) =>
      if t in s.threads && s.threads[t].Finishing? {
        EndedKeepsInv(s, t);
      }
    case Scan(t, found) =>
      if t !in s.threads && Lists(found, s.reg, s.clock) {
        ScannedKeepsInv(s, t, found);
      }
    case Visit(t) =>
      if t in s.threads && s.threads[t].Ticking? && s.threads[t].todo != [] {
        var pc := s.threads[t];
        assert pc.todo == [pc.todo[0]] + pc.todo[1..];
        BeginKeepsInv(s, t, pc.todo[0], Tick(pc.todo[1..], pc.scanned));
      }
    case Sweep(t) =>
      if AtSweep(s, t) {
        SweepKeepsInv(s, t);
      }
  }

  lemma {:induction false} RunKeepsInv(run: seq<Action>)
    ensures Inv(Exec(run))
  {
    if run != [] {
      RunKeepsInv(run[..|run| - 1]);
      StepKeepsInv(Exec(run[..|run| - 1]), run[|run| - 1]);
    }
  }

  // ---------------------------------------------------------------- history only grows

  ghost predicate Extends(s: State, s': State) {
    && s.runs <= s'.runs
    && s.confirmed <= s'.confirmed
    && s.ids <= s'.ids
    && s.clock <= s'.clock
    && (forall id :: id in s.ids && id !in s.reg ==> id !in s'.reg)
    && (forall id :: id in s.reg && id in s'.reg ==>
        s'.reg[id].appliedAt == s.reg[id].appliedAt && s'.reg[id].ttlSecs == s.reg[id].ttlSecs)
  }

  lemma {:induction false} BeginExtends(s: State, t: nat, id: string, caller: Caller)
    ensures Extends(s, Begin(s, t, id, caller))
  {
  }

  lemma {:induction false} ScheduleExtends(s: State, id: string, ttlSecs: nat)
    requires Inv(s) && id !in s.ids
    ensures Extends(s, s.(reg := Scheduled(s.reg, id, ttlSecs, s.clock), ids := s.ids + {id}))
  {
    assert id in s.reg ==> EntryInv(s, id);
  }

  lemma {:induction false} SweepExtends(s: State, t: nat)
    ensures Extends(s, s.(reg := Swept(s.reg, s.clock), threads := s.threads - {t}))
  {
  }

  lemma {:induction false} EndedExtends(s: State, t: nat)
    requires t in s.threads && s.threads[t].Finishing?
    ensures Extends(s, Ended(s, t))
  {
  }

  lemma {:induction false} RanExtends(s: State, t: nat, outcome: Result<string, string>)
    requires t in s.threads && s.threads[t].Running? && s.threads[t].undo.Some?
    ensures Extends(s, Ran(s, t, outcome))
  {
  }

  lemma {:induction false} ConfirmExtends(s: State, id: string)
    requires IsPending(s.reg, id)
    ensures Extends(s, s.(reg := Committed(s.reg, id), confirmed := s.confirmed + {id}))
  {
  }

  /** Only threads or the clock move. */
  lemma {:induction false} MoveExtends(s: State, s': State)
    requires s' == s.(threads := s'.threads, clock := s'.clock) && s.clock <= s'.clock
    ensures Extends(s, s')
  {
  }

  lemma {:induction false} StepExtends(s: State, action: Action)
    requires Inv(s)
    ensures Extends(s, Step(s, action))
  {
    var s' := Step(s, action);
    if s' == s.(threads := s'.threads, clock := s'.clock) && s.clock <= s'.clock {
      MoveExtends(s, s');
    } else {
      match action
      case Schedule(id, ttlSecs) => ScheduleExtends(s, id, ttlSecs);
      case Confirm(id) => ConfirmExtends(s, id);
      case Rollback(t, id) => BeginExtends(s, t, id, Operator);
      case Visit(t) => BeginExtends(s, t, s.threads[t].todo[0], Tick(s.threads[t].todo[1..], s.threads[t].scanned));
      case RunClosure(t, outcome) => RanExtends(s, t, outcome);
      case Finish(t) => EndedExtends(s, t);
      case Sweep(t) => SweepExtends(s, t);
      case _ =>
        assert false;
    }
  }

  lemma {:induction false} RunExtends(run: seq<Action>, n: nat)
    requires n <= |run|
    ensures Extends(Exec(run[..n]), Exec(run))
    decreases |run|
  {
    if n == |run| {
      assert run[..n] == run;
    } else {
      var front := run[..|run| - 1];
      assert front[..n] == run[..n];
      RunExtends(front, n);
      RunKeepsInv(front);
      RunKeepsInv(run[..n]);
      StepExtends(Exec(front), run[|run| - 1]);
    }
  }

  // ---------------------------------------------------------------- the switch's promises

  /** In every interleaving each closure runs at most once, and never for an operation that was confirmed. */
  lemma {:induction false} ClosureRunsAtMostOnce(run: seq<Action>, id: string)
    ensures Exec(run).runs[id] <= 1
    ensures id in Exec(run).confirmed ==> Exec(run).runs[id] == 0
  {
    RunKeepsInv(run);
  }

  /** Once an operation has read "confirmed", its closure has not run and never will. */
  lemma {:induction false} ConfirmedIsFinal(run: seq<Action>, n: nat, id: string)
    requires n <= |run|
    requires id in Exec(run[..n]).reg && Exec(run[..n]).reg[id].status.Confirmed?
    ensures Exec(run).runs[id] == 0
    ensures id in Exec(run).reg ==> Exec(run).reg[id].status.Confirmed?
  {
    RunKeepsInv(run[..n]);
    RunKeepsInv(run);
    assert EntryInv(Exec(run[..n]), id);
    RunExtends(run, n);
    assert id in Exec(run).reg ==> EntryInv(Exec(run), id);
  }

  /** An operation that reads "rolled_back" or "rollback_failed" had its closure run exactly once, with that result. */
  lemma {:induction false} RolledBackMeansRunOnce(run: seq<Action>, n: nat, id: string)
    requires n <= |run|
    requires id in Exec(run[..n]).reg
    requires var e := Exec(run[..n]).reg[id]; e.status.RolledBack? || e.status.RollbackFailed?
    ensures var s := Exec(run[..n]);
            id in s.outcomes && s.reg[id].status == EndOf(s.outcomes[id]) && s.reg[id].message == MessageOf(s.outcomes[id])
    ensures Exec(run[..n]).runs[id] == 1 && Exec(run).runs[id] == 1
  {
    RunKeepsInv(run[..n]);
    RunKeepsInv(run);
    assert EntryInv(Exec(run[..n]), id);
    RunExtends(run, n);
  }

  /** The "closure missing" branch is unreachable, and a thread always carries the closure of its own operation. */
  lemma {:induction false} ClosureIsNeverMissing(run: seq<Action>, t: nat)
    requires t in Exec(run).threads && Exec(run).threads[t].Running?
    ensures Exec(run).threads[t].undo == Some(Undo(Exec(run).threads[t].id))
  {
    RunKeepsInv(run);
    assert OwnerInv(Exec(run), t);
  }

  /** The second lock of a rollback finds its own entry, still "rolling_back" and owned by no other thread. */
  lemma {:induction false} SecondLockFindsItsEntry(run: seq<Action>, t: nat)
    requires t in Exec(run).threads && Exec(run).threads[t].Finishing?
    ensures var s := Exec(run);
            var id := s.threads[t].id;
            && id in s.reg && s.reg[id].status.RollingBack?
            && forall u :: u in s.threads && u != t ==> !Holds(s.threads[u], id)
  {
    RunKeepsInv(run);
    var s := Exec(run);
    assert OwnerInv(s, t) && Holds(s.threads[t], s.threads[t].id);
  }

  lemma {:induction false} StepKeepsRecentOps(s: State, action: Action, id: string)
    requires Inv(s) && id in s.reg && ElapsedSecs(s.reg[id], s.clock) < KEEP_SECS
    ensures id in Step(s, action).reg
  {
  }

  /** An operation stays listed until 300 s after it was applied, in every interleaving. */
  lemma {:induction false} ListedForFiveMinutes(run: seq<Action>, n: nat, id: string)
    requires n <= |run|
    requires id in Exec(run[..n]).reg
    requires ElapsedSecs(Exec(run[..n]).reg[id], Exec(run).clock) < KEEP_SECS
    ensures id in Exec(run).reg
    decreases |run|
  {
    if n == |run| {
      assert run[..n] == run;
    } else {
      var front := run[..|run| - 1];
      assert front[..n] == run[..n];
      RunKeepsInv(front);
      var s, action := Exec(front), run[|run| - 1];
      assert Exec(run) == Step(s, action);
      StepExtends(s, action);
      ElapsedGrows(Exec(run[..n]).reg[id], s.clock, Exec(run).clock);
      ListedForFiveMinutes(front, n, id);
      RunExtends(front, n);
      StepKeepsRecentOps(s, action, id);
    }
  }

  /** Only a sweep removes an operation, and only a completed one applied at least 300 s ago. */
  lemma {:induction false} OnlyOldCompletedOpsAreRemoved(run: seq<Action>, action: Action, id: string)
    requires id in Exec(run).reg && id !in Exec(run + [action]).reg
    ensures action.Sweep?
    ensures var e := Exec(run).reg[id]; Completed(e.status) && ElapsedSecs(e, Exec(run).clock) >= KEEP_SECS
  {
    assert (run + [action])[..|run|] == run;
  }

  // ---------------------------------------------------------------- deadlines

  /** From just after position `n` up to `m` the thread has been busy in one call. */
  ghost predicate BusyThroughout(run: seq<Action>, t: nat, n: nat, m: nat)
    requires m <= |run|
  {
    forall k :: n < k <= m ==> t in Exec(run[..k]).threads
  }

  lemma {:induction false} StepKeepsScan(s: State, action: Action, t: nat)
    requires t in s.threads && TickOf(s.threads[t]).Some?
    requires t in Step(s, action).threads
    ensures TickOf(Step(s, action).threads[t]).Some?
    ensures TickOf(Step(s, action).threads[t]).value.1 == TickOf(s.threads[t]).value.1
  {
  }

  lemma {:induction false} ScanStarts(s: State, t: nat, found: seq<string>)
    requires t !in s.threads && t in Step(s, Scan(t, found)).threads
    ensures TickOf(Step(s, Scan(t, found)).threads[t]).Some?
    ensures forall id :: Expired(s.reg, id, s.clock) <==> id in TickOf(Step(s, Scan(t, found)).threads[t]).value.1
  {
  }

  lemma {:induction false} LastStep(run: seq<Action>, m: nat)
    requires 0 < m <= |run|
    ensures Exec(run[..m]) == Step(Exec(run[..m - 1]), run[m - 1])
  {
    assert run[..m][..m - 1] == run[..m - 1];
  }

  lemma {:induction false} NextStep(run: seq<Action>, m: nat)
    requires m < |run|
    ensures Exec(run[..m + 1]) == Step(Exec(run[..m]), run[m])
  {
    assert run[..m + 1][..m] == run[..m];
  }

  lemma {:induction false} ScanIsRemembered(run: seq<Action>, t: nat, n: nat, m: nat)
    requires n < m <= |run| && run[n].Scan? && run[n].t == t
    requires t !in Exec(run[..n]).threads
    requires BusyThroughout(run, t, n, m)
    ensures t in Exec(run[..m]).threads && TickOf(Exec(run[..m]).threads[t]).Some?
    ensures forall id :: Expired(Exec(run[..n]).reg, id, Exec(run[..n]).clock)
              <==> id in TickOf(Exec(run[..m]).threads[t]).value.1
  {
    LastStep(run, m);
    assert t in Exec(run[..m]).threads;
    var s := Exec(run[..m - 1]);
    if m == n + 1 {
      ScanStarts(s, t, run[n].found);
    } else {
      ScanIsRemembered(run, t, n, m - 1);
      StepKeepsScan(s, run[m - 1], t);
    }
  }

  /**
   * Deadlines are met: whatever any other thread does meanwhile, every operation that was pending and past
   * its deadline at a tick's scan is no longer pending when that tick returns.
   */
  lemma {:induction false} TickMeetsDeadlines(run: seq<Action>, t: nat, n: nat, m: nat, id: string)
    requires n < m < |run| && run[n].Scan? && run[n].t == t && run[m] == Sweep(t)
    requires t !in Exec(run[..n]).threads && BusyThroughout(run, t, n, m)
    requires AtSweep(Exec(run[..m]), t)
    requires Expired(Exec(run[..n]).reg, id, Exec(run[..n]).clock)
    ensures !IsPending(Exec(run[..m + 1]).reg, id)
  {
    var s := Exec(run[..m]);
    assert id in s.threads[t].scanned by {
      ScanIsRemembered(run, t, n, m);
    }
    assert Inv(s) by {
      RunKeepsInv(run[..m]);
    }
    NextStep(run, m);
    SweepLeavesNonePending(s, t, id);
  }

  lemma {:induction false} SweepLeavesNonePending(s: State, t: nat, id: string)
    requires Inv(s) && AtSweep(s, t) && id in s.threads[t].scanned
    ensures !IsPending(Step(s, Sweep(t)).reg, id)
  {
    assert TickInv(s, t);
  }

  /**
   * What a tick's sweep leaves, in every run: exactly the operations still pending or rolling back, and those
   * applied less than 300 s ago, whenever they were confirmed or rolled back.
   */
  lemma {:induction false} SweepLeavesExactly(run: seq<Action>, t: nat, id: string)
    requires AtSweep(Exec(run), t) && id in Exec(run).reg
    ensures var s, after := Exec(run), Exec(run + [Sweep(t)]);
            var e := s.reg[id];
            && (id in after.reg <==>
                  e.status.Pending? || e.status.RollingBack? || s.clock < e.appliedAt + KEEP_SECS * NANOS)
            && (id in after.reg ==> after.reg[id] == e)
  {
    RunKeepsInv(run);
    ExecSnoc(run, Sweep(t));
    assert EntryInv(Exec(run), id);
    SecondsReached(Exec(run).clock - Exec(run).reg[id].appliedAt, KEEP_SECS);
  }

  lemma {:induction false} ExecSnoc(run: seq<Action>, action: Action)
    ensures Exec(run + [action]) == Step(Exec(run), action)
  {
    assert (run + [action])[..|run|] == run;
  }

  /**
   * So a confirmed operation is not always listed for five minutes: in this run one with ten minutes to go is
   * confirmed after five, and the tick of the same instant drops it.
   */
  lemma {:induction false} ConfirmedButGone()
    ensures exists run ::
              var s, s' := Exec(run), Exec(run + [Scan(0, [])] + [Sweep(0)]);
              "a" in s.reg && s.reg["a"].status.Confirmed? && s'.clock == s.clock && "a" !in s'.reg
  {
    var run := ConfirmedLate();
    GoneAfterTick(run);
  }

  lemma {:induction false} GoneAfterTick(run: seq<Action>)
    requires var s := Exec(run);
             s.reg == map["a" := Entry(Confirmed, 600, 0, None, "")] && s.clock == KEEP_SECS * NANOS && s.threads == map[]
    ensures var s' := Exec(run + [Scan(0, [])] + [Sweep(0)]); s'.clock == KEEP_SECS * NANOS && "a" !in s'.reg
  {
    var scanned := run + [Scan(0, [])];
    ExecSnoc(run, Scan(0, []));
    ScanFindsNothing(Exec(run));
    SweepLeavesExactly(scanned, 0, "a");
    ExecSnoc(scanned, Sweep(0));
  }

  lemma {:induction false} ScanFindsNothing(s: State)
    requires s.threads == map[] && forall id :: id in s.reg ==> !s.reg[id].status.Pending?
    ensures var s' := Step(s, Scan(0, [])); s'.reg == s.reg && s'.clock == s.clock && AtSweep(s', 0)
  {
    assert Lists([], s.reg, s.clock);
  }

  lemma {:induction false} ConfirmedLate() returns (run: seq<Action>)
    ensures |run| == 3
    ensures var s := Exec(run);
            s.reg == map["a" := Entry(Confirmed, 600, 0, None, "")] && s.clock == KEEP_SECS * NANOS && s.threads == map[]
  {
    var r1 := [] + [Schedule("a", 600)];
    var r2 := r1 + [Pass(KEEP_SECS * NANOS)];
    run := r2 + [Confirm("a")];
    ExecSnoc([], Schedule("a", 600));
    ExecSnoc(r1, Pass(KEEP_SECS * NANOS));
    ExecSnoc(r2, Confirm("a"));
  }

  /**
   * The five minutes are counted from `appliedAt`, not from completion: an operation with a deadline of 300 s
   * or more that a tick found expired is already gone when that tick returns, unless it is still rolling back.
   */
  lemma {:induction false} LongDeadlinesVanishAtOnce(run: seq<Action>, t: nat, id: string)
    requires AtSweep(Exec(run), t) && id in Exec(run).threads[t].scanned
    requires id in Exec(run).reg && Exec(run).reg[id].ttlSecs >= KEEP_SECS
    ensures id in Exec(run + [Sweep(t)]).reg <==> Exec(run).reg[id].status.RollingBack?
  {
    RunKeepsInv(run);
    assert TickInv(Exec(run), t);
    assert (run + [Sweep(t)])[..|run|] == run;
  }
}
