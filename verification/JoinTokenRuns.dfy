/**
 * Any number of handshake handlers over one pool of tokens, in every interleaving. A handler puts back only
 * what it took, testing the expiry before it takes the lock again. Clock readings inside a locked region are
 * part of the action; a step that cannot happen changes nothing.
 */
module JoinTokenRuns {
  import opened JoinTokens

  /** A handler that took a token and has not finished: still checking, or past the expiry test of a put-back. */
  datatype Holder = Holding(token: string, expires: int) | PuttingBack(token: string, expires: int)

  /** `minted` and `used` record history: when each token was minted, and completed uses. */
  datatype State = State(pool: Pool, clock: int, holders: map<nat, Holder>, minted: map<string, int>, used: multiset<string>)

  datatype Action =
    | Mint(token: string, prunedAt: int, now: int)
    | Take(h: nat, provided: string, prunedAt: int, now: int)
    | Complete(h: nat)
    | GiveUp(h: nat, now: int)
    | PutBack(h: nat)
    | Consume(provided: string, prunedAt: int, now: int)
    | CountPending(now: int)

  const START := State(map[], 0, map[], map[], multiset{})

  /** With `prune` off this is the reference: a map nothing is ever pruned from, read with an expiry test. */
  function Swept(prune: bool, p: Pool, now: int): Pool {
    if prune then Pruned(p, now) else p
  }

  predicate InOrder(s: State, first: int, second: int) {
    s.clock <= first <= second
  }

  function Step(prune: bool, ttl: nat, s: State, action: Action): State {
    match action
    case Mint(token, prunedAt, now) =>
      if token == "" || token in s.minted || !InOrder(s, prunedAt, now) then s
      else s.(pool := Swept(prune, s.pool, prunedAt)[token := now + ttl], clock := now, minted := s.minted[token := now])
    case Take(h, provided, prunedAt, now) =>
      if h in s.holders || provided == "" || !InOrder(s, prunedAt, now) then s else
        var p := Swept(prune, s.pool, prunedAt);
        if Valid(p, provided, now)
        then s.(pool := p - {provided}, clock := now, holders := s.holders[h := Holding(provided, p[provided])])
        else s.(pool := p, clock := now)
    case Complete(h) =>
      if h !in s.holders || !s.holders[h].Holding? then s
      else s.(holders := s.holders - {h}, used := s.used + multiset{s.holders[h].token})
    case GiveUp(h, now) =>
      if h !in s.holders || !s.holders[h].Holding? || now < s.clock then s
      else if now >= s.holders[h].expires then s.(holders := s.holders - {h}, clock := now)
      else s.(holders := s.holders[h := PuttingBack(s.holders[h].token, s.holders[h].expires)], clock := now)
    case PutBack(h) =>
      if h !in s.holders || !s.holders[h].PuttingBack? then s
      else s.(holders := s.holders - {h}, pool := s.pool[s.holders[h].token := s.holders[h].expires])
    case Consume(provided, prunedAt, now) =>
      if provided == "" || !InOrder(s, prunedAt, now) then s else
        var p := Swept(prune, s.pool, prunedAt);
        if Valid(p, provided, now)
        then s.(pool := p - {provided}, clock := now, used := s.used + multiset{provided})
        else s.(pool := p, clock := now)
    case CountPending(now) =>
      if now < s.clock then s else s.(pool := Swept(prune, s.pool, now), clock := now)
  }

  function Exec(prune: bool, ttl: nat, run: seq<Action>): State {
    if run == [] then START else Step(prune, ttl, Exec(prune, ttl, run[..|run| - 1]), run[|run| - 1])
  }

  // ---------------------------------------------------------------- what every step keeps

  predicate Holds(s: State, h: nat, token: string) {
    h in s.holders && s.holders[h].token == token
  }

  predicate Mine(ttl: nat, s: State, token: string, expires: int) {
    token in s.minted && expires == s.minted[token] + ttl && s.used[token] == 0
  }

  ghost predicate Inv(ttl: nat, s: State) {
    && (forall t :: t in s.pool ==> Mine(ttl, s, t, s.pool[t]) && forall h :: h in s.holders ==> s.holders[h].token != t)
    && (forall h :: h in s.holders ==> Mine(ttl, s, s.holders[h].token, s.holders[h].expires))
    && (forall h, g :: h in s.holders && g in s.holders && s.holders[h].token == s.holders[g].token ==> h == g)
    && (forall t :: s.used[t] <= 1)
    && (forall t :: s.used[t] > 0 ==> t in s.minted)
  }

  lemma {:induction false} SweepKeepsInv(prune: bool, ttl: nat, s: State, at: int, clock: int)
    requires Inv(ttl, s)
    ensures Inv(ttl, s.(pool := Swept(prune, s.pool, at), clock := clock))
  {
  }

  /** Removing a token from the pool for a handler, or for a use, keeps everything in one place. */
  lemma {:induction false} TakenKeepsInv(ttl: nat, s: State, token: string, h: nat)
    requires Inv(ttl, s) && token in s.pool && h !in s.holders
    ensures Inv(ttl, s.(pool := s.pool - {token}, holders := s.holders[h := Holding(token, s.pool[token])]))
  {
    assert Mine(ttl, s, token, s.pool[token]);
  }

  lemma {:induction false} ConsumedKeepsInv(ttl: nat, s: State, token: string)
    requires Inv(ttl, s) && token in s.pool
    ensures Inv(ttl, s.(pool := s.pool - {token}, used := s.used + multiset{token}))
  {
    assert Mine(ttl, s, token, s.pool[token]);
  }

  lemma {:induction false} MintKeepsInv(ttl: nat, s: State, token: string, now: int)
    requires Inv(ttl, s) && token !in s.minted
    ensures Inv(ttl, s.(pool := s.pool[token := now + ttl], minted := s.minted[token := now]))
  {
    assert token !in s.pool && s.used[token] == 0;
    assert forall h :: h in s.holders ==> Mine(ttl, s, s.holders[h].token, s.holders[h].expires);
  }

  lemma {:induction false} CompleteKeepsInv(ttl: nat, s: State, h: nat)
    requires Inv(ttl, s) && h in s.holders
    ensures Inv(ttl, s.(holders := s.holders - {h}, used := s.used + multiset{s.holders[h].token}))
  {
    var token := s.holders[h].token;
    assert Mine(ttl, s, token, s.holders[h].expires);
    assert token !in s.pool;
    assert forall g :: g in s.holders && g != h ==> s.holders[g].token != token;
  }

  lemma {:induction false} GiveUpKeepsInv(ttl: nat, s: State, h: nat, now: int)
    requires Inv(ttl, s) && h in s.holders
    ensures Inv(ttl, s.(holders := s.holders - {h}, clock := now))
    ensures Inv(ttl, s.(holders := s.holders[h := PuttingBack(s.holders[h].token, s.holders[h].expires)], clock := now))
  {
    assert Mine(ttl, s, s.holders[h].token, s.holders[h].expires);
  }

  lemma {:induction false} PutBackKeepsInv(ttl: nat, s: State, h: nat)
    requires Inv(ttl, s) && h in s.holders
    ensures Inv(ttl, s.(holders := s.holders - {h}, pool := s.pool[s.holders[h].token := s.holders[h].expires]))
  {
    var token := s.holders[h].token;
    assert Mine(ttl, s, token, s.holders[h].expires);
    assert forall g :: g in s.holders && g != h ==> s.holders[g].token != token;
  }

  lemma {:induction false} TakeKeepsInv(prune: bool, ttl: nat, s: State, action: Action)
    requires Inv(ttl, s) && action.Take?
    ensures Inv(ttl, Step(prune, ttl, s, action))
  {
    var swept := s.(pool := Swept(prune, s.pool, action.prunedAt), clock := action.now);
    SweepKeepsInv(prune, ttl, s, action.prunedAt, action.now);
    if action.h !in s.holders && Valid(swept.pool, action.provided, action.now) {
      TakenKeepsInv(ttl, swept, action.provided, action.h);
    } else {
      assert Step(prune, ttl, s, action) == s || Step(prune, ttl, s, action) == swept;
    }
  }

  lemma {:induction false} ConsumeKeepsInv(prune: bool, ttl: nat, s: State, action: Action)
    requires Inv(ttl, s) && action.Consume?
    ensures Inv(ttl, Step(prune, ttl, s, action))
  {
    var swept := s.(pool := Swept(prune, s.pool, action.prunedAt), clock := action.now);
    SweepKeepsInv(prune, ttl, s, action.prunedAt, action.now);
    if Valid(swept.pool, action.provided, action.now) {
      ConsumedKeepsInv(ttl, swept, action.provided);
    } else {
      assert Step(prune, ttl, s, action) == s || Step(prune, ttl, s, action) == swept;
    }
  }

  lemma {:induction false} HandlerKeepsInv(prune: bool, ttl: nat, s: State, action: Action)
    requires Inv(ttl, s) && (action.Complete? || action.GiveUp? || action.PutBack?)
    requires action.h in s.holders
    ensures Inv(ttl, Step(prune, ttl, s, action))
  {
    match action
    case Complete(h) => CompleteKeepsInv(ttl, s, h);
    case GiveUp(h, now) => GiveUpKeepsInv(ttl, s, h, now);
    case PutBack(h) => PutBackKeepsInv(ttl, s, h);
  }

  lemma {:induction false} MintedKeepsInv(prune: bool, ttl: nat, s: State, token: string, prunedAt: int, now: int)
    requires Inv(ttl, s) && token !in s.minted
    ensures Inv(ttl, s.(pool := Swept(prune, s.pool, prunedAt)[token := now + ttl], clock := now,
                        minted := s.minted[token := now]))
  {
    SweepKeepsInv(prune, ttl, s, prunedAt, now);
    MintKeepsInv(ttl, s.(pool := Swept(prune, s.pool, prunedAt), clock := now), token, now);
  }

  lemma {:induction false} CountKeepsInv(prune: bool, ttl: nat, s: State, now: int)
    requires Inv(ttl, s)
    ensures Inv(ttl, Step(prune, ttl, s, CountPending(now)))
  {
    SweepKeepsInv(prune, ttl, s, now, now);
  }

  lemma {:induction false} MintStepKeepsInv(prune: bool, ttl: nat, s: State, action: Action)
    requires Inv(ttl, s) && action.Mint?
    ensures Inv(ttl, Step(prune, ttl, s, action))
  {
    if action.token !in s.minted {
      MintedKeepsInv(prune, ttl, s, action.token, action.prunedAt, action.now);
    }
  }

  lemma {:induction false} StepKeepsInv(prune: bool, ttl: nat, s: State, action: Action)
    requires Inv(ttl, s)
    ensures Inv(ttl, Step(prune, ttl, s, action))
  {
    match action
    case Mint(_, _, _) => MintStepKeepsInv(prune, ttl, s, action);
    case Take(_, _, _, _) => TakeKeepsInv(prune, ttl, s, action);
    case Consume(_, _, _) => ConsumeKeepsInv(prune, ttl, s, action);
    case CountPending(now) => CountKeepsInv(prune, ttl, s, now);
    case _ =>
      if action.h in s.holders {
        HandlerKeepsInv(prune, ttl, s, action);
      }
  }

  lemma {:induction false} RunKeepsInv(prune: bool, ttl: nat, run: seq<Action>)
    ensures Inv(ttl, Exec(prune, ttl, run))
  {
    if run != [] {
      RunKeepsInv(prune, ttl, run[..|run| - 1]);
      StepKeepsInv(prune, ttl, Exec(prune, ttl, run[..|run| - 1]), run[|run| - 1]);
    }
  }

  // ---------------------------------------------------------------- the pool's promises

  /**
   * In every interleaving a token is in the pool, or with one handler, or gone: never in two of these, never
   * used twice, and never again in the pool or with a handler once used.
   */
  lemma {:induction false} TokenIsInOnePlace(ttl: nat, run: seq<Action>, token: string)
    ensures var s := Exec(true, ttl, run);
            && s.used[token] <= 1
            && (s.used[token] == 1 ==> token !in s.pool && forall h :: !Holds(s, h, token))
            && (token in s.pool ==> forall h :: !Holds(s, h, token))
            && (forall h, g :: Holds(s, h, token) && Holds(s, g, token) ==> h == g)
  {
    RunKeepsInv(true, ttl, run);
  }

  /** No number of take and put-back cycles moves a token's expiry: it is always mint time plus ttl. */
  lemma {:induction false} ExpiryNeverMoves(ttl: nat, run: seq<Action>, token: string, h: nat)
    ensures var s := Exec(true, ttl, run);
            && (token in s.pool ==> token in s.minted && s.pool[token] == s.minted[token] + ttl)
            && (Holds(s, h, token) ==> token in s.minted && s.holders[h].expires == s.minted[token] + ttl)
  {
    RunKeepsInv(true, ttl, run);
  }

  predicate Gone(s: State, token: string) {
    token in s.minted && token !in s.pool && forall h :: h in s.holders ==> s.holders[h].token != token
  }

  /** A token that is gone stays gone, so it is never handed out again. */
  lemma {:induction false} GoneForGood(ttl: nat, run: seq<Action>, n: nat, token: string)
    requires n <= |run| && Gone(Exec(true, ttl, run[..n]), token)
    ensures Gone(Exec(true, ttl, run), token)
    ensures Exec(true, ttl, run).used[token] == Exec(true, ttl, run[..n]).used[token]
    decreases |run|
  {
    if n == |run| {
      assert run[..n] == run;
    } else {
      var front := run[..|run| - 1];
      assert front[..n] == run[..n];
      GoneForGood(ttl, front, n, token);
      StepKeepsGone(ttl, Exec(true, ttl, front), run[|run| - 1], token);
    }
  }

  lemma {:induction false} StepKeepsGone(ttl: nat, s: State, action: Action, token: string)
    requires Gone(s, token)
    ensures var s' := Step(true, ttl, s, action); Gone(s', token) && s'.used[token] == s.used[token]
  {
  }

  /**
   * Of two handlers presenting one valid token, however their steps interleave with any others, the second
   * gets nothing while the first still holds it.
   */
  lemma {:induction false} SecondTakeFails(ttl: nat, run: seq<Action>, h: nat, g: nat, token: string, prunedAt: int,
        now: int)
    requires Holds(Exec(true, ttl, run), h, token) && h != g
    ensures !Holds(Exec(true, ttl, run + [Take(g, token, prunedAt, now)]), g, token)
  {
    RunKeepsInv(true, ttl, run);
    assert (run + [Take(g, token, prunedAt, now)])[..|run|] == run;
  }

  // ---------------------------------------------------------------- pruning changes no answer

  predicate SameButPruned(s: State, u: State) {
    && s.clock == u.clock && s.holders == u.holders && s.minted == u.minted && s.used == u.used
    && (forall t :: t in s.pool ==> t in u.pool && s.pool[t] == u.pool[t])
    && (forall t :: t in u.pool && t !in s.pool ==> u.pool[t] <= s.clock)
  }

  lemma {:induction false} SweepKeepsSame(s: State, u: State, at: int, clock: int)
    requires SameButPruned(s, u) && at <= clock && s.clock <= clock
    ensures SameButPruned(s.(pool := Pruned(s.pool, at), clock := clock), u.(clock := clock))
  {
  }

  lemma {:induction false} TakeKeepsSame(ttl: nat, s: State, u: State, action: Action)
    requires SameButPruned(s, u) && (action.Take? || action.Consume?)
    ensures SameButPruned(Step(true, ttl, s, action), Step(false, ttl, u, action))
  {
    if InOrder(s, action.prunedAt, action.now) {
      SweepKeepsSame(s, u, action.prunedAt, action.now);
      var p := Pruned(s.pool, action.prunedAt);
      assert Valid(p, action.provided, action.now) <==> Valid(u.pool, action.provided, action.now);
    }
  }

  lemma {:induction false} MintKeepsSame(ttl: nat, s: State, u: State, action: Action)
    requires SameButPruned(s, u) && action.Mint?
    ensures SameButPruned(Step(true, ttl, s, action), Step(false, ttl, u, action))
  {
    if InOrder(s, action.prunedAt, action.now) {
      SweepKeepsSame(s, u, action.prunedAt, action.now);
    }
  }

  lemma {:induction false} HandlerKeepsSame(ttl: nat, s: State, u: State, action: Action)
    requires SameButPruned(s, u) && (action.Complete? || action.GiveUp? || action.PutBack?)
    ensures SameButPruned(Step(true, ttl, s, action), Step(false, ttl, u, action))
  {
  }

  lemma {:induction false} CountKeepsSame(ttl: nat, s: State, u: State, now: int)
    requires SameButPruned(s, u)
    ensures SameButPruned(Step(true, ttl, s, CountPending(now)), Step(false, ttl, u, CountPending(now)))
  {
    if s.clock <= now {
      SweepKeepsSame(s, u, now, now);
    }
  }

  lemma {:induction false} StepKeepsSame(ttl: nat, s: State, u: State, action: Action)
    requires SameButPruned(s, u)
    ensures SameButPruned(Step(true, ttl, s, action), Step(false, ttl, u, action))
  {
    match action
    case Mint(_, _, _) => MintKeepsSame(ttl, s, u, action);
    case Take(_, _, _, _) => TakeKeepsSame(ttl, s, u, action);
    case Consume(_, _, _) => TakeKeepsSame(ttl, s, u, action);
    case CountPending(now) => CountKeepsSame(ttl, s, u, now);
    case _ => HandlerKeepsSame(ttl, s, u, action);
  }

  lemma {:induction false} RunsAreSame(ttl: nat, run: seq<Action>)
    ensures SameButPruned(Exec(true, ttl, run), Exec(false, ttl, run))
  {
    if run != [] {
      RunsAreSame(ttl, run[..|run| - 1]);
      StepKeepsSame(ttl, Exec(true, ttl, run[..|run| - 1]), Exec(false, ttl, run[..|run| - 1]), run[|run| - 1]);
    }
  }

  /**
   * Over every run the pruned pool answers like a map nothing is ever removed from, read with an expiry test:
   * the same takes and uses succeed, the same tokens are valid now, and the same number is pending.
   */
  lemma {:induction false} PruningIsInvisible(ttl: nat, run: seq<Action>, token: string, now: int)
    requires now >= Exec(true, ttl, run).clock
    ensures var s, u := Exec(true, ttl, run), Exec(false, ttl, run);
            && s.holders == u.holders && s.used == u.used
            && (Valid(s.pool, token, now) <==> Valid(u.pool, token, now))
            && Pruned(s.pool, now) == Pruned(u.pool, now)
  {
    RunsAreSame(ttl, run);
  }
}
