/** Single-use, time-bounded tokens: taken under one lock, and put back when a later step of the handshake fails. */
module JoinTokens {
  import opened Wrappers

  /** Each pending token with the instant it expires. */
  type Pool = map<string, int>

  predicate Valid(p: Pool, token: string, now: int) {
    token in p && p[token] > now
  }

  function Pruned(p: Pool, now: int): Pool {
    map t | t in p && p[t] > now :: p[t]
  }

  class OneTimeTokens {
    const ttl: int
    var inner: Pool

    constructor (ttl: int)
      ensures this.ttl == ttl && inner == map[]
    {
      this.ttl := ttl;
      inner := map[];
    }

    method PruneExpired(now: int)
      modifies this
      ensures inner == Pruned(old(inner), now)
    {
      inner := map t | t in inner && inner[t] > now :: inner[t];
    }

    /**
     * A new token is good up to its expiry and no longer, and no other token becomes better or worse by the
     * pruning. The clock is read once to prune and once more for the expiry.
     */
    method Mint(token: string, prunedAt: int, now: int)
      modifies this
      ensures inner == Pruned(old(inner), prunedAt)[token := now + ttl]
      ensures forall t :: Valid(inner, token, t) <==> t < now + ttl
      ensures forall other, t :: other != token && t >= prunedAt ==> (Valid(inner, other, t) <==> Valid(old(inner), other, t))
    {
      PruneExpired(prunedAt);
      inner := inner[token := now + ttl];
    }

    /** Compare with every entry, never stopping early. */
    method Matching(provided: string, now: int) returns (matched: Option<string>)
      ensures matched == if Valid(inner, provided, now) then Some(provided) else None
    {
      matched := None;
      var todo := inner.Keys;
      while todo != {}
        invariant todo <= inner.Keys
        invariant matched == if provided !in todo && Valid(inner, provided, now) then Some(provided) else None
      {
        var token :| token in todo;
        if token == provided && inner[token] > now {
          matched := Some(token);
        }
        todo := todo - {token};
      }
    }

    method Take(provided: string, prunedAt: int, now: int) returns (expires: Option<int>)
      modifies this
      ensures provided == "" ==> expires == None && inner == old(inner)
      ensures provided != "" ==>
                var p := Pruned(old(inner), prunedAt);
                if Valid(p, provided, now) then expires == Some(p[provided]) && inner == p - {provided}
                else expires == None && inner == p
    {
      if provided == "" {
        return None;
      }
      PruneExpired(prunedAt);
      var matched := Matching(provided, now);
      if matched.None? {
        return None;
      }
      expires := Some(inner[matched.value]);
      inner := inner - {matched.value};
    }

    method VerifyAndConsume(provided: string, prunedAt: int, now: int) returns (ok: bool)
      modifies this
      ensures provided == "" ==> !ok && inner == old(inner)
      ensures provided != "" ==>
                var p := Pruned(old(inner), prunedAt);
                ok == Valid(p, provided, now) && inner == if ok then p - {provided} else p
    {
      if provided == "" {
        return false;
      }
      PruneExpired(prunedAt);
      var matched := Matching(provided, now);
      if matched.Some? {
        inner := inner - {matched.value};
      }
      return matched.Some?;
    }

    /** A token that was taken out is good again up to the expiry it came with; every other is as it was. */
    method Reinsert(token: string, expires: int, now: int)
      modifies this
      ensures inner == if now >= expires then old(inner) else old(inner)[token := expires]
      ensures token !in old(inner) ==> forall t :: t >= now ==> (Valid(inner, token, t) <==> t < expires)
      ensures forall other, t :: other != token ==> (Valid(inner, other, t) <==> Valid(old(inner), other, t))
    {
      if now >= expires {
        return;
      }
      inner := inner[token := expires];
    }

    /** How many tokens are good at this moment; counting spoils none of them. */
    method PendingCount(now: int) returns (n: nat)
      modifies this
      ensures inner == Pruned(old(inner), now)
      ensures n == |set t | t in old(inner) && Valid(old(inner), t, now)|
      ensures forall t, later :: later >= now ==> (Valid(inner, t, later) <==> Valid(old(inner), t, later))
    {
      ghost var good := set t | t in inner && Valid(inner, t, now);
      PruneExpired(now);
      assert inner.Keys == good;
      n := |inner|;
    }
  }
}
